# SEO analyser text engine in Dafny

This project models the text-analysis engine of a small SEO analyser web
service. The engine exists as near-identical copies in `server.js` and in the
two serverless handlers `api/analyze.js` and `api/compress.js`. The model
states each piece once. The table below cites every copy.

- **`cleanText`** (`Whitespace`): `text.replace(/\s+/g, ' ').trim()`.
  - Every run of JavaScript whitespace becomes one space, then both ends are trimmed.
  - The result is in a normal form: only `' '` as whitespace, no two whitespace characters side by side, none at either end.
  - The result is the text's words joined by single spaces.
  - `cleanText` is idempotent, and it fixes exactly the strings already in normal form.
- **`generateNGrams`** (`NGrams`, over `Counter` and `StableSort`).
  - The counting loop fills an insertion-ordered counter of lower-cased, space-joined windows that are longer than one character.
  - The counter's entries are stably sorted by count, largest first, and cut to 20.
  - Proved: the shape of the result, the meaning of each count, first-counted order among ties, the fact that the cut keeps the best grams, and the bound on the total of the counts.
- **The `/api/analyze` content step** (`ContentAnalysis`).
  - The body text is cleaned and tokenized, and the tokens are counted.
  - The fixed 64-word stop-word set and the length test filter the tokens.
  - The 1-, 2- and 3-gram rankings are built from what is left.
- **`summarizeText`**: `Segmenter`, then `Summarizer`.
  - The sentence regex `/[^.!?]+[.!?]+/g` is modelled by a left-to-right scanner.
  - The whole-text frequency table counts tokens longer than two characters.
  - Each sentence's score is the mean frequency of its tokens.
  - The sentences are sorted in place by score, the first `max(1, ceil(S * ratio))` are kept, and those are sorted back into text order.
  - The kept sentences are trimmed and joined by single spaces.
- **The `/api/compress` level switch** (`Compression`): levels 1 to 5 give ratios 1.0, 0.75, 0.5, 0.25 and 0.1; anything else gives 1.0.

Conventions of the model:

- The word tokenizer (`natural.WordTokenizer.tokenize`) and `String.prototype.toLowerCase` are parameters of type `string -> seq<string>` and `string -> string`. Nothing is assumed about them, except in `ContentAnalysis.FilteredWindowsAllCounted`, which assumes that lower-casing never shortens a string.
- A JavaScript object used as a counter is a sequence of `Entry(key, count)` in insertion order, which is the order `Object.entries` reports for string keys. `Lookup` is `counter[k] || 0`, and `Bump` is `counter[k] = (counter[k] || 0) + 1`.
- `Array.prototype.sort` is stable. `StableSort.SortDesc` is a stable sort by a numeric key, larger keys first. A stable sort's output is fixed by its input and the order, so it gives the same order as the runtime's.
  - The comparator `a.index - b.index` is the key `-index`.
  - The in-place sorts of `summarizeText` are `StableSort.SortInPlace` on an array.
- Scores are exact rationals (`real`).
- The ratio is an integer percentage `p` in {100, 75, 50, 25, 10}, so the selection count is `max(1, (S * p + 99) / 100)`.
- The parsed level is `Option<int>`; `None` stands for the `NaN` that `parseInt` gives for a non-number.

At ratio 1.0 the summary is not always the whole text: with two or more
matches, only what the regex matches is kept:
- terminators at the very start of the text are in no match;
- text after the last terminator is in no match.

`Segmenter.SegmentsCoverText` states this exactly, and
`Summarizer.SummaryFullRatio` states what is returned at ratio 1.0.

## Model

| member | source | states |
|---|---|---|
| Whitespace.CleanText | server.js:18-20 | `cleanText`: the whitespace collapse followed by the trim; the result is never longer than the text and has no whitespace at either end |
| Whitespace.Collapse | api/analyze.js:8 | `replace(/\s+/g, ' ')`, every whitespace run replaced by one space: never longer than its input, and empty only when the input is empty |
| Whitespace.Trim | server.js:19 | `trim()`, the front trim then the back trim: never longer than its input, and no whitespace at either end |
| Whitespace.CleanTextIsClean | api/analyze.js:7-9 | the cleaned text has no whitespace but single `' '` characters, never two whitespace characters side by side, and none at either end |
| Whitespace.CleanTextJoinsWords | server.js:18-20 | the cleaned text is exactly the text's maximal non-whitespace runs, in order, joined by single spaces |
| Whitespace.CleanTextIdempotent | api/analyze.js:8 | cleaning a cleaned text changes nothing |
| Whitespace.CleanTextFixedExactlyOnClean | server.js:19 | a text is left unchanged by cleaning if and only if it is already in the normal form |
| Whitespace.CollapseIsCollapsed | server.js:19 | after `replace(/\s+/g, ' ')` no whitespace but `' '` remains, no two whitespace characters are adjacent, and the result starts with `' '` exactly where the input starts with whitespace |
| Whitespace.WordsOfCollapse | api/analyze.js:8 | collapsing whitespace runs keeps the words and their order |
| Whitespace.WordsOfTrim | api/compress.js:28 | `trim()` keeps the words and their order |
| Whitespace.TrimStart | api/analyze.js:8 | the front trim returns a suffix that does not start with whitespace and drops only whitespace |
| Whitespace.TrimEnd | server.js:64 | the back trim returns a prefix that does not end with whitespace and drops only whitespace |
| Whitespace.CleanIsJoinedWords | api/analyze.js:7 | a string in normal form is its own words joined by single spaces |
| Counter.Lookup | server.js:28 | reading `counter[k]` with 0 for an absent key, as a definition: the count of the entry with key `k`, or 0 when there is none; what it reads after counting is stated by `Counter.TallyCounts` |
| Counter.Bump | server.js:28 | a bump of `counter[k]`: a known key keeps its place, a new key goes last, `k` reads one more, and every other key reads as before |
| Counter.TallyCounts | api/analyze.js:16 | after counting a list, the keys are its distinct strings in first-seen order and each key reads its number of occurrences |
| StableSort.SortDesc | server.js:32 | the sort returns a permutation of its input |
| StableSort.SortDescSorted | api/analyze.js:20 | the sort orders by key, larger first |
| StableSort.SortDescStable | server.js:71 | elements with equal keys keep their input order |
| StableSort.SortDescDistinct | server.js:31 | sorting never makes two entries share a key |
| StableSort.SortDescPrefixDominates | server.js:71-75 | an element among the first `c` after sorting has a larger key than any element left out, or an equal key and an earlier input position |
| StableSort.InsertInPlace | api/compress.js:34 | one pass of the in-place sort places the next element behind every earlier one whose key is at least its own and leaves the rest of the array alone |
| StableSort.SortInPlace | api/compress.js:39 | sorting an array in place leaves it holding the stable sort of what it held before |
| NGrams.RankNGrams | server.js:23-34 | the value of `generateNGrams`: never more than 20 entries, and none when the window is longer than the token list |
| NGrams.GenerateNGrams | server.js:23-34 | the counting loop, the sort and the cut return the ranking of the counted grams |
| NGrams.RankingShape | api/analyze.js:19-21 | at most 20 entries, counts non-increasing, no gram twice |
| NGrams.RankNGramsShortInput | server.js:25 | with fewer tokens than the window size the result is empty |
| NGrams.RankNGramsCounts | server.js:24-29 | every listed gram is longer than one character, and its count is the number of window positions whose lower-cased, space-joined tokens equal it (at least one) |
| NGrams.GramsCountPositions | api/analyze.js:12-18 | a gram is counted once per window position with that text, and a text of one character or less is never counted |
| NGrams.RankingCounts | api/analyze.js:14-16 | every listed entry is a counted gram with its number of occurrences |
| NGrams.RankingTies | server.js:31-32 | grams with equal counts are listed in the order in which they were first counted |
| NGrams.RankingKeepsTheBest | server.js:31-33 | a counted gram that is not listed means 20 grams are listed, each counted more often, or as often and first counted earlier |
| NGrams.RankNGramsTotal | api/analyze.js:13-18 | the listed counts add up to at most the number of window positions, the token count minus n plus one, or 0 |
| ContentAnalysis.Kept | api/analyze.js:70-72 | the filter's test as a definition: the lower-cased token is none of the 64 stop words and the token is longer than two characters |
| ContentAnalysis.FilterTokens | server.js:120-122 | the filter keeps exactly the tokens longer than two characters whose lower-case form is no stop word, each as often as in the input, in input order |
| ContentAnalysis.FilteredWindowsAllCounted | api/analyze.js:70-72 | when lower-casing never shortens a string, every window of the filtered tokens passes the `gram.length > 1` test, so every window position is counted |
| ContentAnalysis.AnalyzeContent | api/analyze.js:65-76 | the reply's raw text is the cleaned body text (in normal form), its character count is that text's length, its word count is the number of tokens, at least the number of filtered tokens, and its three rankings are the 1-, 2- and 3-gram rankings of the filtered tokens |
| Segmenter.Segments | api/compress.js:8 | the successive matches of `/[^.!?]+[.!?]+/g`; each holds at least two characters, so there are at most half as many matches as characters |
| Segmenter.Sentences | server.js:41 | the matches, or the whole text when nothing matches: never an empty list |
| Segmenter.BodyLengthRun | api/compress.js:8 | a match's first part is a maximal run of non-terminators |
| Segmenter.PunctLengthRun | server.js:41 | a match's second part is a maximal run of terminators |
| Segmenter.SegmentsAreSegments | api/compress.js:8 | every match is a non-empty run of non-terminators followed by a non-empty run of terminators |
| Segmenter.SegmentsCoverText | api/compress.js:8-9 | the matches, back to back, are exactly the text between its leading terminators and an unterminated tail that holds no terminator |
| Summarizer.CountWords | server.js:45-51 | the `forEach` leaves `wordFreq` holding the count of the tokens longer than two characters |
| Summarizer.FrequenciesCount | api/compress.js:11-17 | reading `wordFreq[t]` (or 0 when absent) gives the number of occurrences of `t` among the tokens if `t` is longer than two characters, and 0 otherwise |
| Summarizer.ScoreSentence | server.js:55-65 | the scoring loop computes the sentence's score: the sum of its tokens' frequencies over its token count, or 0 with no tokens |
| Summarizer.SentenceScore | api/compress.js:29 | a score is never negative |
| Summarizer.SentenceScoreIsMean | api/compress.js:19-29 | a sentence's score is the mean, over its tokens, of how often each occurs in the whole lower-cased text (counting only tokens longer than two characters), or 0 with no tokens |
| Summarizer.ScoreAll | server.js:54-68 | the `map` scores every sentence in text order, each with its trimmed text and its index |
| Summarizer.SelectSentences | server.js:70-78 | the two in-place sorts and the slice keep the selection of the scored sentences |
| Summarizer.SummarizeText | server.js:37-81 | the summariser returns the summary; an empty text gives `''`, and a text with at most one match comes back unchanged |
| Summarizer.SelectionShape | api/compress.js:34-39 | as many sentences are kept as the selection count says (at most all of them), each with its own score and trimmed text, in strictly increasing position |
| Summarizer.SummaryShape | server.js:74-80 | a summary of several sentences is the trimmed kept sentences, in strictly increasing original position, joined by single spaces, and there are `min(max(1, ceil(S * ratio)), S)` of them |
| Summarizer.SelectionKeepsTheBest | api/compress.js:19-37 | a kept sentence scores higher than any sentence left out, or the same and comes earlier |
| Summarizer.SelectionAll | server.js:74-78 | at ratio 1.0 every scored sentence is kept, in text order |
| Summarizer.SummaryFullRatio | api/compress.js:36-41 | at ratio 1.0 the summary is every matched sentence, trimmed, in text order, joined by single spaces |
| Summarizer.SelectionCount | api/compress.js:36 | the selection count for a ratio given as a whole percentage; it is never below 1 |
| Summarizer.Summary | api/compress.js:5-42 | the value of `summarizeText` as a definition: `''` for an empty text, the text itself with at most one match, and otherwise the selected sentences, trimmed, joined by single spaces |
| Summarizer.SelectionCountIsCeiling | server.js:74 | the selection count is `max(1, ceil(S * percent / 100))` |
| Summarizer.SelectionCountBounds | api/compress.js:36 | for a ratio of at most 1 and at least one sentence the count lies between 1 and S |
| Summarizer.SelectionCountFull | api/compress.js:37 | at ratio 1.0 the count covers every sentence |
| Summarizer.SelectionCountMonotone | server.js:75 | a larger ratio never keeps fewer sentences |
| Compression.LevelPercent | api/compress.js:62-70 | the `switch` table as a function of the parsed level; every level maps to one of 100, 75, 50, 25 and 10 percent |
| Compression.RatioForLevel | server.js:158-166 | levels 1 to 5 give 100, 75, 50, 25 and 10 percent, anything else 100 percent, and every such ratio gives a count between 1 and S |
| Compression.Compress | api/compress.js:60-78 | a request without text is refused; otherwise the reply holds the text's length, the ratio of its level (levels 1 to 5 as in the switch, anything else 1.0), the summary at that ratio and the summary's length |

## Left out

- The `natural.WordTokenizer` and `String.prototype.toLowerCase` are library code whose source is not part of this model. They are function parameters with no assumed behaviour.
  - The one exception is that `ContentAnalysis.FilteredWindowsAllCounted` assumes lower-casing never shortens a string. Full Unicode lower-casing can lengthen a string (`'İ'` becomes two code units) but does not shorten one.
- String lengths are counted in characters. JavaScript's `.length` counts UTF-16 code units, so characters outside the Basic Multilingual Plane count once here and twice there.
- Floating point is not modelled.
  - Scores are exact rationals.
  - The ratio is an integer percentage, so the selection count is exact integer arithmetic, not `Math.ceil` of a double product.
- JavaScript object quirks are not modelled. A counter is a plain insertion-ordered map, so the model leaves out:
  - inherited keys such as `constructor`, which make `wordFreq[token]` truthy for a token never counted;
  - `Object.entries` listing integer-like keys before the others.
- `parseInt` is not modelled: the level arrives already parsed.
- The request text is a string here. JavaScript's `!text` also rejects a missing field, which this model does not represent.
- HTTP and serverless plumbing is outside the model: Express setup, CORS headers, the OPTIONS and 405 checks, status codes other than the refused request, and the JSON envelopes.
- Fetching the page with axios and extracting its title, meta description, headings and body text with cheerio are outside the model. The body text is an input of `ContentAnalysis.AnalyzeContent`.
- `public/script.js` (the browser front end) is not part of this model.
- The runtime's sort algorithm is not modelled; only its result is. Any stable sort by the same key gives that result, and the model sorts by insertion.
